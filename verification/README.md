# Pandora mediator: dispatch, handler candidates and handler registration

This project models the core of the Pandora mediator, an in-process notification
dispatcher written in C#, and proves properties of the model.

- **Dispatch** (`MediatorService`). `RaiseAsync` and `Raise` reject a null notification.
  They then take a dependency-injection scope and resolve the handlers for the
  notification type. The handlers run one after another. Each handler's exception is
  recorded and the loop continues. At the end, every recorded exception is thrown inside
  one `AggregateException`. Only `RaiseAsync` checks its cancellation token, and only
  before each handler starts.
- **Handler candidates** (`MediatorOptionsBuilder`). The builder holds a set of types.
  `RegisterHandler` adds a type that passes a reflection-flag filter.
  `RegisterHandlersFromAssembly` applies `RegisterHandler` to every type of an assembly.
  `Build` returns the set.
- **Handler registration** (`MediatorRegisterUtility`). `RegisterHandlers` pairs each
  candidate type with each of its `ISignalHandler<>` interfaces. Each pair goes through
  `TryAddTransient`, so the first implementation registered for a notification type wins.

In the model, reflection and the container are plain data:

- A type is a `TypeDesc` record: identity, assembly, `IsClass`, `IsAbstract`,
  `IsGenericTypeDefinition` and interfaces (`type_model.dfy`).
- A resolved handler is a value. It says whether its `HandleAsync` completes or throws,
  and whether it cancels the caller's token while running.
- A dispatch returns an event log and the way the call ends. The log holds scope
  creation, each handler start and scope disposal.
- The service collection is a sequence of descriptors.

Files:

- `mediator_service.dfy`: the dispatch.
- `mediator_options_builder.dfy`: the builder.
- `mediator_register_utility.dfy`: the registration.

Two points where the model's reading goes beyond the code. The model follows the code
in both.

- The builder filter `IsClass || !IsAbstract || !IsGenericTypeDefinition` drops only
  abstract, non-class generic type definitions. The model reads it as a mistaken negation
  of the common skip test `!IsClass || IsAbstract || IsGenericTypeDefinition`: each
  operand is flipped, but `||` is not turned into `&&`. No file of the C# project states
  the intended filter. The evidence is all in `SignalRegistrationBuilderTests.cs`:
  - the test class declares an `AbstractHandler` helper (line 14), but no test uses it;
  - the comment at line 45 argues from `IsClass` ("closed generic types are classes");
  - the comment at line 57 describes what is rejected.
  The builder is modelled as written; see Findings.
- The builder test `Build_ReturnsSnapshotArray_NotLiveView` names `Build()` a snapshot.
  The code returns the live `HashSet`. The model returns the set as a value. This matches
  what the tests observe, because they copy the result with `ToList()`.

## Model

| member | source | states |
|---|---|---|
| MediatorService.RaiseAsync | source/Pandora.Extensions.Mediator/src/Extensions/Mediator/MediatorService.cs:18-48 | A null notification ends in `ArgumentNull` with nothing done. Otherwise a scope is created, the handlers up to the cancellation cut-off start in order, the scope is disposed, and the call ends in `Report` of exactly those handlers' exceptions in order |
| MediatorService.Raise | source/Pandora.Extensions.Mediator/src/Extensions/Mediator/MediatorService.cs:50-80 | A null notification ends in `ArgumentNull` with nothing done. Otherwise every resolved handler starts once, in order, between scope creation and disposal, and the call reports all their exceptions in order |
| MediatorService.LoopMeaning | source/Pandora.Extensions.Mediator/src/Extensions/Mediator/MediatorService.cs:29-44 | The `foreach` loop starts exactly the handlers before the cancellation cut-off, in order, and records exactly their exceptions, in order |
| MediatorService.ScopeDisposedExactlyOnce | source/Pandora.Extensions.Mediator/src/Extensions/Mediator/MediatorService.cs:26-80 | In both modes the scope is created first and disposed last, each exactly once, whatever the handlers do |
| MediatorService.NullRejectedBeforeAnyScope | source/Pandora.Extensions.Mediator/src/Extensions/Mediator/MediatorService.cs:21-26 | A null notification raises `ArgumentNullException` in both modes before any scope is created |
| MediatorService.NoHandlersCompletesNormally | source/Pandora.Extensions.Mediator/src/Extensions/Mediator/MediatorService.cs:29-47 | With no handler resolved, both modes complete normally with no invocation |
| MediatorService.AggregateIffSomeStartedHandlerThrew | source/Pandora.Extensions.Mediator/src/Extensions/Mediator/MediatorService.cs:46-47 | The call throws an `AggregateException` if and only if a started handler threw, and then its inner list is the started handlers' exceptions |
| MediatorService.FailureDoesNotStopLaterHandlers | source/Pandora.Extensions.Mediator/src/Extensions/Mediator/MediatorService.cs:35-43 | Which handlers start never depends on whether handlers throw, only on cancellation requests |
| MediatorService.CancellationGatesLaterHandlers | source/Pandora.Extensions.Mediator/src/Extensions/Mediator/MediatorService.cs:31-33 | A started handler has an uncancelled token at the call's start and no cancelling handler before it. Conversely, every such handler starts, including the one that cancels |
| MediatorService.SyncIsUngatedAsync | source/Pandora.Extensions.Mediator/src/Extensions/Mediator/MediatorService.cs:63-74 | `Raise` behaves like `RaiseAsync` with a token that is never cancelled |
| MediatorService.SingleFailureStillWrapped | source/Pandora.Extensions.Mediator/src/Extensions/Mediator/MediatorService.cs:76-79 | One failing handler still ends in an `AggregateException` holding its one exception |
| MediatorService.TwoFailuresGiveTwoInnerExceptions | source/Pandora.Extensions.Mediator/test/Extensions/Mediator/Services/MediatorServiceTest.cs:92-146 | Two failing handlers give one `AggregateException` with exactly their two exceptions, in order, in both modes |
| MediatorService.CancellingHandlerStopsTheNext | source/Pandora.Extensions.Mediator/test/Extensions/Mediator/Services/MediatorServiceTest.cs:52-89 | A first handler that cancels the token completes; the second is never invoked, and the call completes normally |
| MediatorService.FailureBeforeCancellationStillThrown | source/Pandora.Extensions.Mediator/src/Extensions/Mediator/MediatorService.cs:33-47 | An exception recorded before the `break` is still thrown in the `AggregateException` |
| MediatorOptionsBuilder.NewBuilder | source/Pandora.Extensions.Mediator.Abstraction/src/Extensions/Mediator/Builder/MediatorOptionsBuilder.cs:10-13 | A new builder's set is empty, and so has one descriptor per type identity |
| MediatorOptionsBuilder.Build | source/Pandora.Extensions.Mediator.Abstraction/src/Extensions/Mediator/Builder/MediatorOptionsBuilder.cs:49-52 | The result is exactly the current members, as a value; `SnapshotIsolation` shows that a later registration does not change it |
| MediatorOptionsBuilder.BuildAfterScan | source/Pandora.Extensions.Mediator.Abstraction/src/Extensions/Mediator/Builder/MediatorOptionsBuilder.cs:15-23 | A new builder that scans a type list builds exactly the accepted types of that list |
| MediatorOptionsBuilder.RegisterHandlerKeepsIdsUnique | source/Pandora.Extensions.Mediator.Abstraction/src/Extensions/Mediator/Builder/MediatorOptionsBuilder.cs:10 | Registering a descriptor that agrees with the members of its identity keeps one descriptor per identity, as `HashSet<Type>` does |
| MediatorOptionsBuilder.RegisterHandler | source/Pandora.Extensions.Mediator.Abstraction/src/Extensions/Mediator/Builder/MediatorOptionsBuilder.cs:32-47 | The type is a member afterwards if and only if it was one before or passes the filter. No member is removed, and nothing else is added |
| MediatorOptionsBuilder.RegisterHandlersFromAssembly | source/Pandora.Extensions.Mediator.Abstraction/src/Extensions/Mediator/Builder/MediatorOptionsBuilder.cs:15-23 | The fold of `RegisterHandler` over the assembly's types gives the old set plus every accepted type of the list |
| MediatorOptionsBuilder.RegisterHandlersFromAssemblyOf | source/Pandora.Extensions.Mediator.Abstraction/src/Extensions/Mediator/Builder/MediatorOptionsBuilder.cs:25-30 | Scanning the assembly of `T` gives the old set plus every accepted type that assembly defines |
| MediatorOptionsBuilder.RegisterHandlerIdempotent | source/Pandora.Extensions.Mediator.Abstraction/src/Extensions/Mediator/Builder/MediatorOptionsBuilder.cs:10-37 | Registering a type twice equals registering it once, and registration never removes a member |
| MediatorOptionsBuilder.AssemblyScanIdempotent | source/Pandora.Extensions.Mediator.Abstraction/src/Extensions/Mediator/Builder/MediatorOptionsBuilder.cs:15-23 | Scanning the same assembly twice equals scanning it once |
| MediatorOptionsBuilder.AssemblyOfTypeIncludesType | source/Pandora.Extensions.Mediator.Abstraction/test/Extensions/Mediator/Builder/SignalRegistrationBuilderTests.cs:66-89 | After scanning the assembly of `T`, `T` is a member if and only if it was one before or passes the filter |
| MediatorOptionsBuilder.SnapshotIsolation | source/Pandora.Extensions.Mediator.Abstraction/src/Extensions/Mediator/Builder/MediatorOptionsBuilder.cs:49-52 | A set built before registering a type lacks it. One built after has exactly that type added |
| MediatorOptionsBuilder.TestedTypes | source/Pandora.Extensions.Mediator.Abstraction/test/Extensions/Mediator/Builder/SignalRegistrationBuilderTests.cs:29-64 | A concrete class and a closed generic class are kept. An open generic interface such as `IList<>` is dropped without error |
| MediatorOptionsBuilder.AcceptsAbstractAndOpenGenericTypes | source/Pandora.Extensions.Mediator.Abstraction/src/Extensions/Mediator/Builder/MediatorOptionsBuilder.cs:34 | The filter as written rejects exactly abstract, non-class generic definitions. Abstract classes, open generic classes and plain interfaces are registered |
| MediatorOptionsBuilder.RegisterConcreteHandler | source/Pandora.Extensions.Mediator.Abstraction/src/Extensions/Mediator/Builder/MediatorOptionsBuilder.cs:32-40 | With the corrected filter, the type is a member afterwards if and only if it was one before or is a class that is neither abstract nor a generic definition |
| MediatorOptionsBuilder.ConcreteFilterRejectsAbstractAndOpenGeneric | source/Pandora.Extensions.Mediator.Abstraction/src/Extensions/Mediator/Builder/MediatorOptionsBuilder.cs:34 | The corrected filter leaves the set unchanged for non-classes, abstract types and generic definitions. It is never more permissive than the filter as written, and it agrees with it on concrete classes |
| MediatorRegisterUtility.InterfacePairs | source/Pandora.Extensions.Mediator.Abstraction/src/Extensions/Mediator/MediatorRegisterUtility.cs:16-17 | A pair comes from one type exactly when one of its interfaces is generic with definition `ISignalHandler<>`. The interface is the service and the type is the implementation |
| MediatorRegisterUtility.HandlerPairs | source/Pandora.Extensions.Mediator.Abstraction/src/Extensions/Mediator/MediatorRegisterUtility.cs:15-17 | A pair is in the query result exactly when some listed type has a matching handler interface |
| MediatorRegisterUtility.TryAddTransient | source/Pandora.Extensions.Mediator.Abstraction/src/Extensions/Mediator/MediatorRegisterUtility.cs:21 | The old collection is a prefix of the result. The service is registered afterwards. The collection is unchanged if and only if the service was already registered; otherwise one transient entry for the pair is appended |
| MediatorRegisterUtility.RegisterHandlers | source/Pandora.Extensions.Mediator.Abstraction/src/Extensions/Mediator/MediatorRegisterUtility.cs:13-23 | Old entries are kept as a prefix and every handler service ends up registered. Each new entry is transient, for a service absent before, and is the first pair for that service. No two new entries share a service |
| MediatorRegisterUtility.AddAllMeaning | source/Pandora.Extensions.Mediator.Abstraction/src/Extensions/Mediator/MediatorRegisterUtility.cs:19-22 | The same four facts about the `foreach` over any pair list, proved by induction |
| MediatorRegisterUtility.RegisterHandlersIdempotent | source/Pandora.Extensions.Mediator.Abstraction/src/Extensions/Mediator/MediatorRegisterUtility.cs:21 | A second call with the same types adds nothing |
| MediatorRegisterUtility.FirstImplementationWins | source/Pandora.Extensions.Mediator.Abstraction/src/Extensions/Mediator/MediatorRegisterUtility.cs:15-21 | A handler service that had no entry has exactly one afterwards: the first pair for it in types-by-interfaces order |
| MediatorRegisterUtility.LaterHandlerForSameNotificationDropped | source/Pandora.Extensions.Mediator.Abstraction/src/Extensions/Mediator/MediatorRegisterUtility.cs:19-22 | With two handler types for one notification type, only the first is registered |
| MediatorRegisterUtility.OnePairPerHandlerInterface | source/Pandora.Extensions.Mediator.Abstraction/src/Extensions/Mediator/MediatorRegisterUtility.cs:15-17 | A type with two handler interfaces gives one pair per interface, in interface order. A type with none gives no pair |

## Findings

| source | as written | input that shows it | evidently intended | confidence | as-written member | corrected member |
|---|---|---|---|---|---|---|
| source/Pandora.Extensions.Mediator.Abstraction/src/Extensions/Mediator/Builder/MediatorOptionsBuilder.cs:34 | `IsClass \|\| !IsAbstract \|\| !IsGenericTypeDefinition` keeps every type except abstract, non-class generic definitions | an abstract class (`IsClass`, `IsAbstract`), an open generic class `GenericHandler<>`, a non-generic interface | the negation of the usual skip test, `IsClass && !IsAbstract && !IsGenericTypeDefinition`. This is the model's reading, supported by the unused `AbstractHandler` helper and the comment at SignalRegistrationBuilderTests.cs:45 | medium; not executed | MediatorOptionsBuilder.AcceptsAbstractAndOpenGenericTypes | MediatorOptionsBuilder.ConcreteFilterRejectsAbstractAndOpenGeneric |

The builder functions (`RegisterHandler` and both assembly scans) keep the filter as
written, because that is the behaviour the registration receives. The corrected filter
sits beside them as `IsConcreteClass` and `RegisterConcreteHandler`.

## Left out

- Dependency-injection internals are not modelled: `IServiceScopeFactory`, `CreateScope`,
  `CreateAsyncScope` and `GetServices<ISignalHandler<T>>`. Resolution is a handler
  sequence given by the caller, and routing by exact notification type is the
  container's job. Scope creation and disposal are events in the log. Exceptions thrown
  by the container itself or by `Dispose` are not modelled.
- Tasks and async plumbing are not modelled: `await`, `ConfigureAwait(false)`,
  `GetAwaiter().GetResult()` and `CancellationTokenSource`. A handler's awaited result
  is its `Completion`. The token is a boolean: whether it is already cancelled at the
  call's start, plus each handler's flag saying it cancels the token while running.
  Cancellation by another thread during a handler counts as that handler's request.
- Reflection is not modelled: `Assembly.GetTypes()`, `Type.GetInterfaces()` and the type
  flags are record fields and given lists. A type's assembly is a map lookup.
- Order is unspecified in the source, so the model does not fix it. `Build` returns a
  `set`, because `HashSet` enumeration order is unspecified. `RegisterHandlers` takes
  its types as a sequence in whatever order the caller enumerates them.
- `Build` does not model the live-view aliasing of `_types.AsEnumerable()`; it returns
  the set as a value.
- The fluent `return this` of the builder methods becomes the returned builder value.
- `RegisterHandler<T>()` is not a separate member. It is `RegisterHandler` applied to the
  descriptor of `typeof(T)`.
- `ServiceCollectionExtensions.cs` in both projects is left out. It only wires the
  builder, the registration and the service singleton together.
- The interface files `IMediatorService.cs`, `IMediatorOptionsBuilder.cs` and
  `ISignalHandler.cs` only gave the shape of the model.
- Exceptions are opaque values compared by identity. Their concrete types are not modelled.
- MediatorRegisterUtility.TryAddTransient: keyed registrations are not modelled. Since
  version 8, Microsoft.Extensions.DependencyInjection's `TryAdd` skips only when an
  existing descriptor matches both `ServiceType` and `ServiceKey`, so a keyed entry does
  not block an un-keyed add. `IsRegistered` treats any entry for the service type as
  blocking. That is the behaviour for collections without keyed entries.
- MediatorOptionsBuilder.RegisterHandlersFromAssembly: failure paths are not modelled.
  `Assembly.GetTypes()` can throw `ReflectionTypeLoadException`, and then the scan
  registers nothing. Null `Type`, `Assembly` or `types` arguments throw as well. The
  model takes the type list as given.
- Descriptors are values, so a `set<TypeDesc>` could hold two descriptors with one
  identity. `IdsUnique` and `RegisterHandlerKeepsIdsUnique` state the well-formedness
  that rules this out; the other builder functions do not require it.
