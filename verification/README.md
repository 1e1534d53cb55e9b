# DurableMocks generic-hierarchy matcher, in Dafny

DurableMocks builds a fake `TaskOrchestrationContext` for tests of Durable Task
orchestrations. It scans an assembly for concrete classes deriving from
`TaskOrchestrator<,>` or `TaskActivity<,>` and makes the fake answer
`CallSubOrchestratorAsync` / `CallActivityAsync` by constructing such a class and
running its `RunAsync` locally.

This project models the decision logic of `DurableMocksExtensions.cs`:

- `TypeUniverse` (type_universe.dfy): .NET reflection as a finite, immutable map from
  type ids to records (name, namespace, assembly, class/abstract/interface flags,
  generic definition and arguments, base type, interfaces, `BeforeFieldInit`).
  `object` is the root with id 0. A well-formed universe numbers each base type below
  the types deriving from it; that id is the depth measure of every walk.
  `IsSubclassOf` is the transitive closure of the base relation, plus the .NET rule
  that every type other than `object`, interfaces included, is a subclass of `object`;
  `FullTypeDefinition` is `GetFullTypeDefinition`.
- `Matcher` (matcher.dfy): `VerifyGenericArguments`, the per-step test of the
  `while` loop (`StepMatches`), the loop itself as a recursive `Walk` whose contract
  ties it to the chain of base types (`SomeStepMatches`), and `IsSubClassOfGeneric`.
- `Wiring` (wiring.dfy): the guard and argument extraction of
  `SetupFakeCallForType`, and the scan of `CreateDurableMock`. The fake context is a
  dispatch table keyed by (method name, first argument's string). Each rule records
  the type it would construct, its input and output types, and which context it
  passes along.
- `Wrappers` (wrappers.dfy): `Option` and `Result`.

The model reproduces these quirks of the code as written:

- Input and output types are read from the class's immediate base type (line 32),
  not from the chain step that matched. A class matching through a non-generic
  intermediate class therefore makes wiring throw (`IndexOutOfRange`). The whole scan
  then aborts.
- Whether the parent counts as "parameter-less" depends on the `BeforeFieldInit`
  flag of its first generic argument (line 64).
- Argument lists of different lengths are always accepted (line 112).
- At a class step, line 77 compares the parent's open definition with the step's open
  definition, and that comparison always succeeds. Only the comparison of line 79, of
  the parent against the unreduced step, can fail.

Two further details of the code:

- `IsSubClassOfGeneric` does not test `IsClass` or `IsAbstract`; only the wiring guard
  at line 30 does.
- Argument identity in `VerifyGenericArguments` compares `Assembly`, `Name` and
  `Namespace` (line 116).

## Model

| member | source | states |
|---|---|---|
| TypeUniverse.FullTypeDefinition | DurableMocksExtensions.cs:103-106 | a non-generic type is returned unchanged; the result is always an open definition or a non-generic type, and keeps the interface flag |
| TypeUniverse.FullTypeDefinitionIdempotent | DurableMocksExtensions.cs:103-106 | reducing to the full definition twice is the same as reducing once |
| TypeUniverse.IsSubclassOf | DurableMocksExtensions.cs:57-60 | a subclass's ancestor is a type of the universe with a smaller id, so no type is a subclass of itself; every type other than `object`, interfaces included, is a subclass of `object` |
| TypeUniverse.IsSubclassOfTransitive | DurableMocksExtensions.cs:118 | the subclass relation used for argument compatibility is transitive |
| TypeUniverse.Chain | DurableMocksExtensions.cs:66-97 | the loop's visited steps: start at the child, each next step is the previous step's base, never `object`, and the last step has no base or has `object` as its base |
| TypeUniverse.SubclassIffLaterChainStep | DurableMocksExtensions.cs:57-60 | apart from `object`, a type is a proper ancestor exactly when it is a chain step after the first |
| Matcher.PositionsCompatibleFrom | DurableMocksExtensions.cs:114-122 | the early-exit loop over positions accepts exactly when every remaining position has the same named type or a subclass |
| Matcher.VerifyGenericArguments | DurableMocksExtensions.cs:108-127 | lists of different lengths are accepted; equal-length lists are rejected exactly when some position differs in assembly, name or namespace and is not a subclass |
| Matcher.VerifyGenericArgumentsReflexive | DurableMocksExtensions.cs:114-122 | every type's arguments are compatible with themselves |
| Matcher.VerifyGenericArgumentsEmpty | DurableMocksExtensions.cs:112-126 | two argument-less types are compatible |
| Matcher.IsParameterLessGeneric | DurableMocksExtensions.cs:62-64 | a parent without generic arguments is parameter-less; otherwise it is parameter-less exactly when its first argument lacks `BeforeFieldInit` |
| Matcher.StepMatchesCharacterised | DurableMocksExtensions.cs:68-95 | a step whose open definition is the parent matches; for a parameter-less parent a step matches exactly when that holds or an interface of its definition has the parent's definition; no step matches unless the parent's definition is the step's or that of an interface of the step or its definition |
| Matcher.ChainStepsUnfold | DurableMocksExtensions.cs:66-98 | one loop iteration: some step from a type with a base matches exactly when the type itself or some step from its base matches |
| Matcher.SingleStepChain | DurableMocksExtensions.cs:66-98 | a type without a base is the loop's only step, so some step matches exactly when it does |
| Matcher.Walk | DurableMocksExtensions.cs:66-100 | the loop stops at `object` or at a missing base type, and returns true exactly when some step of the chain of base types passes the per-step test |
| Matcher.IsSubClassOfGeneric | DurableMocksExtensions.cs:50-60 | a type never matches itself; a proper subclass of the parent matches |
| Matcher.IsSubClassOfGenericIff | DurableMocksExtensions.cs:50-101 | the matcher accepts exactly when the child differs from the parent and is a proper subclass of it or has a matching chain step |
| Matcher.WalkMonotoneAlongChain | DurableMocksExtensions.cs:66-98 | if the walk from a later chain step (such as the base type) succeeds, the walk from the start succeeds |
| Matcher.MatchThroughChainDefinition | DurableMocksExtensions.cs:66-72 | a chain step at any depth whose open definition is the (open) parent makes the match succeed |
| Matcher.ParameterLessInterfaceMatch | DurableMocksExtensions.cs:62-72 | for a parameter-less parent, a step whose definition implements an interface with the parent's definition makes the match succeed |
| Matcher.BoundStepComparesOnlyConcreteArguments | DurableMocksExtensions.cs:73-84 | for a bound parent at a class step with the parent's definition, the step matches exactly when the step's open definition is the parent itself or the step's own arguments are compatible with the parent's |
| Matcher.SubclassShortcutSubsumedByWalk | DurableMocksExtensions.cs:57-100 | apart from `object` and parameter-less instantiated parents, the walk alone accepts every proper subclass |
| Wiring.SetupFakeCallForType | DurableMocksExtensions.cs:28-38 | only a concrete matching class gets a rule, keyed on the method name and its own name, with positions 0 and 1 of its immediate base type's arguments; a missing base or too few arguments throws; other keys are unchanged |
| Wiring.ScanType | DurableMocksExtensions.cs:20-24 | one scanned type fails exactly when it is selected for a template but lacks the two arguments; otherwise it adds the keys it registers and leaves every other rule unchanged |
| Wiring.CreateDurableMock | DurableMocksExtensions.cs:13-26 | the scan throws at the first faulty type; otherwise a key has a rule exactly when some scanned type registers it, the rule fits that type, and it comes from the last type registering the key |
| Wiring.ScanStepKeys | DurableMocksExtensions.cs:20-24 | one more scanned type extends the set of configured keys by exactly the keys it registers |
| Wiring.ScanStepRules | DurableMocksExtensions.cs:20-24 | after one more scanned type every rule still fits its key and still comes from the last registering type |
| Wiring.DispatchAfterWiring | DurableMocksExtensions.cs:36-39 | an intercepted call is answered by a rule exactly when a scanned type registered its (method, name) key, and the rule fits that key |
| Wiring.NoMatchingTypesWiresNothing | DurableMocksExtensions.cs:20-24 | an assembly with no concrete matching class configures no rule |
| Wiring.SingleActivityWiring | DurableMocksExtensions.cs:20-38 | a lone class deriving directly from a two-argument activity instantiation gets the activity rule under its own name, with the instantiation's arguments as input and output, plus a sub-orchestration rule with the same data exactly when it also matches the orchestrator template, and nothing else |
| Wiring.IndirectSubclassFailsWiring | DurableMocksExtensions.cs:30-34 | a class two levels below the template through a non-generic class matches, but its setup throws an index-out-of-range at position 0 |

## Left out

- FakeItEasy call interception (`A.Fake`, `A.CallTo`, `Where`, `WithNonVoidReturnType`, `ReturnsLazily`): a foreign mocking library, reduced to a dispatch table. The non-void-return filter and the call overloads are not modelled.
- `ActivatorUtilities.CreateInstance`, `GetMethod("RunAsync")`, `MethodInfo.Invoke` and the returned `Task`: dependency injection, reflection and async invocation. A rule only records the type to construct and the context to pass.
- The fake activity context's `InstanceId` (a fresh `Guid`) and `Name`: nondeterministic setup data with no effect on the decisions.
- `Assembly.GetTypes()`: taken as an arbitrary input sequence of type ids.
- `TaskName.ToString()`: the first argument of an intercepted call is taken to be its string already.
- `GetInterfaces()`: a given set per type, inherited interfaces included. How the CLR computes it is not modelled.
- .NET type-system semantics beyond the record: generic constraints, variance, load contexts, generic parameters as types. A null `Namespace` is represented by the empty string.
- Matcher.IsSubClassOfGeneric: its own contract states only the two early exits. The full characterisation is the separate lemma `Matcher.IsSubClassOfGenericIff`.
