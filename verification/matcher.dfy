/**
  The generic-hierarchy matcher: decides whether a type is an implementation of a
  (possibly open) generic base template by walking its base-type chain and the
  interfaces at each step.
*/
module Matcher {
  import opened Wrappers
  import opened TypeUniverse

  /** Two types are "the same named type" when assembly, name and namespace all agree. */
  predicate SameNamedType(u: Universe, a: TypeId, b: TypeId)
    requires a in u && b in u
  {
    u[a].assembly == u[b].assembly && u[a].name == u[b].name && u[a].namespace == u[b].namespace
  }

  /** One argument position is acceptable when the child's argument is the parent's, or derives from it. */
  predicate ArgumentCompatible(u: Universe, parentArg: TypeId, childArg: TypeId)
    requires Valid(u) && parentArg in u && childArg in u
  {
    SameNamedType(u, childArg, parentArg) || IsSubclassOf(u, childArg, parentArg)
  }

  predicate AllIn(u: Universe, ts: seq<TypeId>) {
    forall k :: 0 <= k < |ts| ==> ts[k] in u
  }

  /**
    The `for` loop of `VerifyGenericArguments` from position `i` on: it stops with false
    at the first incompatible position.
  */
  function PositionsCompatibleFrom(u: Universe, parentArgs: seq<TypeId>, childArgs: seq<TypeId>, i: nat): (r: bool)
    requires Valid(u) && AllIn(u, parentArgs) && AllIn(u, childArgs)
    requires |parentArgs| == |childArgs| && i <= |childArgs|
    ensures r <==> forall j :: i <= j < |childArgs| ==> ArgumentCompatible(u, parentArgs[j], childArgs[j])
    decreases |childArgs| - i
  {
    if i == |childArgs| then true
    else if !ArgumentCompatible(u, parentArgs[i], childArgs[i]) then false
    else PositionsCompatibleFrom(u, parentArgs, childArgs, i + 1)
  }

  /**
    `VerifyGenericArguments`: argument lists of different lengths are accepted without
    comparison; lists of equal length are accepted exactly when every position is.
  */
  function VerifyGenericArguments(u: Universe, parent: TypeId, child: TypeId): (r: bool)
    requires Valid(u) && parent in u && child in u
    ensures |u[child].genericArguments| != |u[parent].genericArguments| ==> r
    ensures |u[child].genericArguments| == |u[parent].genericArguments| ==>
              (r <==> forall j :: 0 <= j < |u[child].genericArguments| ==>
                        ArgumentCompatible(u, u[parent].genericArguments[j], u[child].genericArguments[j]))
  {
    var childArgs := u[child].genericArguments;
    var parentArgs := u[parent].genericArguments;
    if |childArgs| == |parentArgs| then PositionsCompatibleFrom(u, parentArgs, childArgs, 0) else true
  }

  /** Every type's arguments are compatible with themselves. */
  lemma VerifyGenericArgumentsReflexive(u: Universe, t: TypeId)
    requires Valid(u) && t in u
    ensures VerifyGenericArguments(u, t, t)
  {
  }

  /** Two types without generic arguments are always compatible. */
  lemma VerifyGenericArgumentsEmpty(u: Universe, parent: TypeId, child: TypeId)
    requires Valid(u) && parent in u && child in u
    requires u[parent].genericArguments == [] && u[child].genericArguments == []
    ensures VerifyGenericArguments(u, parent, child)
  {
  }

  /**
    The parent counts as a "parameter-less generic" unless it has a first generic
    argument whose attributes carry `BeforeFieldInit`.
  */
  function IsParameterLessGeneric(u: Universe, parent: TypeId): (r: bool)
    requires Valid(u) && parent in u
    ensures u[parent].genericArguments == [] ==> r
    ensures u[parent].genericArguments != [] ==> (r <==> !u[u[parent].genericArguments[0]].beforeFieldInit)
  {
    var parameters := u[parent].genericArguments;
    !(|parameters| > 0 && u[parameters[0]].beforeFieldInit)
  }

  /** The open definitions of the interfaces a type implements. */
  function InterfaceDefinitions(u: Universe, t: TypeId): set<TypeId>
    requires Valid(u) && t in u
  {
    set i | i in u[t].interfaces :: FullTypeDefinition(u, i)
  }

  /** Whether one iteration of the walk, visiting `step`, returns true. */
  predicate StepMatches(u: Universe, step: TypeId, parent: TypeId, parameterLess: bool)
    requires Valid(u) && step in u && parent in u
  {
    var cur := FullTypeDefinition(u, step);
    var parentDefinition := FullTypeDefinition(u, parent);
    if parent == cur || (parameterLess && parentDefinition in InterfaceDefinitions(u, cur)) then true
    else if parameterLess then false
    else if parentDefinition == cur && !u[cur].isInterface then
      VerifyGenericArguments(u, parentDefinition, cur) && VerifyGenericArguments(u, parent, step)
    else
      exists i :: i in u[step].interfaces && parentDefinition == FullTypeDefinition(u, i) && VerifyGenericArguments(u, parent, i)
  }

  /**
    What one step decides: a step whose open definition is the parent always matches;
    for a parameter-less parent exactly that or an interface of the step's definition
    counts; and no step matches unless the parent's open definition is the step's, or
    that of an interface of the step or of its definition.
  */
  lemma StepMatchesCharacterised(u: Universe, step: TypeId, parent: TypeId, parameterLess: bool)
    requires Valid(u) && step in u && parent in u
    ensures parent == FullTypeDefinition(u, step) ==> StepMatches(u, step, parent, parameterLess)
    ensures parameterLess ==>
              (StepMatches(u, step, parent, parameterLess) <==>
                 parent == FullTypeDefinition(u, step) ||
                 FullTypeDefinition(u, parent) in InterfaceDefinitions(u, FullTypeDefinition(u, step)))
    ensures StepMatches(u, step, parent, parameterLess) ==>
              || FullTypeDefinition(u, parent) == FullTypeDefinition(u, step)
              || FullTypeDefinition(u, parent) in InterfaceDefinitions(u, FullTypeDefinition(u, step))
              || FullTypeDefinition(u, parent) in InterfaceDefinitions(u, step)
  {
    var parentDefinition := FullTypeDefinition(u, parent);
    if StepMatches(u, step, parent, parameterLess) && parent == FullTypeDefinition(u, step) {
      FullTypeDefinitionIdempotent(u, step);
    }
    if exists i :: i in u[step].interfaces && parentDefinition == FullTypeDefinition(u, i) {
      var i :| i in u[step].interfaces && parentDefinition == FullTypeDefinition(u, i);
      assert parentDefinition in InterfaceDefinitions(u, step);
    }
  }

  /** Some step of the chain from `c` passes the per-step test. */
  predicate SomeStepMatches(u: Universe, c: TypeId, parent: TypeId, parameterLess: bool)
    requires Valid(u) && c in u && parent in u
  {
    exists k :: 0 <= k < |Chain(u, c)| && StepMatches(u, Chain(u, c)[k], parent, parameterLess)
  }

  /** Some step of a chain matches exactly when its first step or some step of the rest does. */
  lemma ChainStepsUnfold(u: Universe, c: TypeId, b: TypeId, parent: TypeId, parameterLess: bool)
    requires Valid(u) && c in u && parent in u && c != ObjectId && u[c].baseType == Some(b)
    ensures SomeStepMatches(u, c, parent, parameterLess) <==>
              StepMatches(u, c, parent, parameterLess) ||
              SomeStepMatches(u, b, parent, parameterLess)
  {
    assert Chain(u, c) == [c] + Chain(u, b);
    if StepMatches(u, c, parent, parameterLess) {
      assert Chain(u, c)[0] == c;
    }
    if exists k :: 0 <= k < |Chain(u, b)| && StepMatches(u, Chain(u, b)[k], parent, parameterLess) {
      var k :| 0 <= k < |Chain(u, b)| && StepMatches(u, Chain(u, b)[k], parent, parameterLess);
      assert Chain(u, c)[k + 1] == Chain(u, b)[k];
    }
    if exists k :: 0 <= k < |Chain(u, c)| && StepMatches(u, Chain(u, c)[k], parent, parameterLess) {
      var k :| 0 <= k < |Chain(u, c)| && StepMatches(u, Chain(u, c)[k], parent, parameterLess);
      if k > 0 {
        assert Chain(u, b)[k - 1] == Chain(u, c)[k];
      }
    }
  }

  /** A chain of one step matches exactly when that step does. */
  lemma SingleStepChain(u: Universe, c: TypeId, parent: TypeId, parameterLess: bool)
    requires Valid(u) && c in u && parent in u && c != ObjectId && u[c].baseType.None?
    ensures SomeStepMatches(u, c, parent, parameterLess) <==>
              StepMatches(u, c, parent, parameterLess)
  {
    assert Chain(u, c) == [c];
    if StepMatches(u, c, parent, parameterLess) {
      assert StepMatches(u, Chain(u, c)[0], parent, parameterLess);
    }
  }

  /**
    The `while` loop of `IsSubClassOfGeneric`, entered with a non-null `child`: it stops
    at `object` or at a missing base type. It succeeds exactly when some step of the
    chain matches, and reports false otherwise.
  */
  function Walk(u: Universe, child: TypeId, parent: TypeId, parameterLess: bool): (r: bool)
    requires Valid(u) && child in u && parent in u
    ensures r <==> SomeStepMatches(u, child, parent, parameterLess)
    decreases child
  {
    if child == ObjectId then false
    else
      match u[child].baseType
      case None =>
        SingleStepChain(u, child, parent, parameterLess);
        StepMatches(u, child, parent, parameterLess)
      case Some(b) =>
        ChainStepsUnfold(u, child, b, parent, parameterLess);
        StepMatches(u, child, parent, parameterLess) || Walk(u, b, parent, parameterLess)
  }

  /** `IsSubClassOfGeneric`: a type never matches itself; a proper subclass matches before any walk. */
  function IsSubClassOfGeneric(u: Universe, child: TypeId, parent: TypeId): (r: bool)
    requires Valid(u) && child in u && parent in u
    ensures child == parent ==> !r
    ensures child != parent && IsSubclassOf(u, child, parent) ==> r
  {
    if child == parent then false
    else if IsSubclassOf(u, child, parent) then true
    else Walk(u, child, parent, IsParameterLessGeneric(u, parent))
  }

  /** The whole matcher, stated over the chain rather than as a loop. */
  lemma IsSubClassOfGenericIff(u: Universe, child: TypeId, parent: TypeId)
    requires Valid(u) && child in u && parent in u
    ensures IsSubClassOfGeneric(u, child, parent) <==>
              child != parent &&
              (IsSubclassOf(u, child, parent) ||
               SomeStepMatches(u, child, parent, IsParameterLessGeneric(u, parent)))
  {
    var parameterLess := IsParameterLessGeneric(u, parent);
    var walked := Walk(u, child, parent, parameterLess);
  }

  /** Monotonicity: if the walk started at a later step of the chain succeeds, so does the walk from its start. */
  lemma {:induction false} WalkMonotoneAlongChain(u: Universe, c: TypeId, k: nat, parent: TypeId, parameterLess: bool)
    requires Valid(u) && c in u && parent in u
    requires k < |Chain(u, c)|
    requires Walk(u, Chain(u, c)[k], parent, parameterLess)
    ensures Walk(u, c, parent, parameterLess)
    decreases k
  {
    if k > 0 {
      var b := u[c].baseType.value;
      assert Chain(u, c) == [c] + Chain(u, b);
      WalkMonotoneAlongChain(u, b, k - 1, parent, parameterLess);
    }
  }

  /**
    A chain step whose open definition is the parent makes the match succeed, however
    deep in the chain it lies (direct and multi-level inheritance alike), when the
    parent is itself an open definition or a non-generic type.
  */
  lemma MatchThroughChainDefinition(u: Universe, child: TypeId, parent: TypeId, k: nat)
    requires Valid(u) && child in u && parent in u && child != parent
    requires FullTypeDefinition(u, parent) == parent
    requires k < |Chain(u, child)| && FullTypeDefinition(u, Chain(u, child)[k]) == parent
    ensures IsSubClassOfGeneric(u, child, parent)
  {
    var parameterLess := IsParameterLessGeneric(u, parent);
    assert StepMatches(u, Chain(u, child)[k], parent, parameterLess);
  }

  /**
    For a parameter-less parent, a chain step whose open definition implements an
    interface with the parent's open definition makes the match succeed.
  */
  lemma ParameterLessInterfaceMatch(u: Universe, child: TypeId, parent: TypeId, k: nat)
    requires Valid(u) && child in u && parent in u && child != parent
    requires IsParameterLessGeneric(u, parent)
    requires k < |Chain(u, child)|
    requires FullTypeDefinition(u, parent) in InterfaceDefinitions(u, FullTypeDefinition(u, Chain(u, child)[k]))
    ensures IsSubClassOfGeneric(u, child, parent)
  {
    assert StepMatches(u, Chain(u, child)[k], parent, true);
  }

  /**
    For a parameter-bound parent, the open-definition comparison at a class step is
    always satisfied, so such a step matches exactly when the step itself is the parent
    or its own arguments are compatible with the parent's.
  */
  lemma BoundStepComparesOnlyConcreteArguments(u: Universe, step: TypeId, parent: TypeId)
    requires Valid(u) && step in u && parent in u
    requires !IsParameterLessGeneric(u, parent)
    requires FullTypeDefinition(u, parent) == FullTypeDefinition(u, step)
    requires !u[step].isInterface
    ensures StepMatches(u, step, parent, false) <==>
              parent == FullTypeDefinition(u, step) || VerifyGenericArguments(u, parent, step)
  {
    VerifyGenericArgumentsReflexive(u, FullTypeDefinition(u, step));
  }

  /**
    The proper-subclass shortcut only decides the outcome for `object` and for
    parameter-less instantiated parents: for any other parent the walk alone would
    reach the same verdict.
  */
  lemma {:induction false} SubclassShortcutSubsumedByWalk(u: Universe, child: TypeId, parent: TypeId)
    requires Valid(u) && child in u && parent in u
    requires IsSubclassOf(u, child, parent) && parent != ObjectId
    requires FullTypeDefinition(u, parent) == parent || !IsParameterLessGeneric(u, parent)
    ensures Walk(u, child, parent, IsParameterLessGeneric(u, parent))
  {
    var parameterLess := IsParameterLessGeneric(u, parent);
    SubclassIffLaterChainStep(u, child, parent);
    var k :| 0 < k < |Chain(u, child)| && Chain(u, child)[k] == parent;
    assert !u[parent].isInterface by {
      assert u[Chain(u, child)[k - 1]].baseType == Some(parent);
    }
    if FullTypeDefinition(u, parent) != parent {
      VerifyGenericArgumentsReflexive(u, parent);
      VerifyGenericArgumentsReflexive(u, FullTypeDefinition(u, parent));
    }
    assert StepMatches(u, parent, parent, parameterLess);
  }
}
