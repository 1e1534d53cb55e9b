/**
  The context wiring engine: scans the types of an assembly and, for every concrete
  class matching the orchestrator or the activity template, registers an interception
  rule on the fake orchestration context.

  The fake context is modelled as an explicit dispatch table from (intercepted method
  name, first argument's string) to a rule. Building the instance through the
  dependency-injection container and invoking its `RunAsync` stay opaque: a rule
  records only which type it would construct, the input and output types read off the
  base type, and which collaborator context it would pass along.
*/
module Wiring {
  import opened Wrappers
  import opened TypeUniverse
  import opened Matcher

  /** Method name of the intercepted sub-orchestration call. */
  const SubOrchestratorMethod: string := "CallSubOrchestratorAsync"

  /** Method name of the intercepted activity call. */
  const ActivityMethod: string := "CallActivityAsync"

  /** The two base templates, `TaskOrchestrator<,>` and `TaskActivity<,>`. */
  datatype Templates = Templates(orchestrator: TypeId, activity: TypeId)

  /** The context a constructed instance receives: the fake orchestration context itself, or the fake activity context. */
  datatype Collaborator = OrchestrationContext | ActivityContext

  /** A rule fires for calls to `methodName` whose first argument's string equals `firstArgument`. */
  datatype RuleKey = RuleKey(methodName: string, firstArgument: string)

  /** What a fired rule does: construct `target`, run it with the collaborator on an `input`, yield an `output`. */
  datatype Rule = Rule(target: TypeId, input: TypeId, output: TypeId, collaborator: Collaborator)

  /**
    The rules configured on the fake context. Configuring a key again replaces its
    rule, as the most recently configured matching rule is the one that answers.
  */
  type DispatchTable = map<RuleKey, Rule>

  /** The exceptions the argument extraction can throw during wiring. */
  datatype WiringError =
    | NullBaseType(target: TypeId)
    | IndexOutOfRange(target: TypeId, index: nat)

  /** The guard of `SetupFakeCallForType`: a concrete class matching the template. */
  predicate Selected(u: Universe, t: TypeId, parent: TypeId)
    requires Valid(u) && t in u && parent in u
  {
    u[t].isClass && !u[t].isAbstract && IsSubClassOfGeneric(u, t, parent)
  }

  /** Whether the immediate base type has the two generic arguments the extraction indexes. */
  predicate HasInputOutput(u: Universe, t: TypeId)
    requires Valid(u) && t in u
  {
    u[t].baseType.Some? && |u[u[t].baseType.value].genericArguments| >= 2
  }

  /** Position `k` of the immediate base type's generic arguments. */
  function BaseArgument(u: Universe, t: TypeId, k: nat): TypeId
    requires Valid(u) && t in u && HasInputOutput(u, t) && k < 2
  {
    u[u[t].baseType.value].genericArguments[k]
  }

  /** The collaborator the wiring pairs with each intercepted method. */
  function CollaboratorFor(methodName: string): Collaborator {
    if methodName == SubOrchestratorMethod then OrchestrationContext else ActivityContext
  }

  /**
    `SetupFakeCallForType`: a selected type gets one rule keyed on the method name and
    its own name, with input and output taken from positions 0 and 1 of its IMMEDIATE
    base type's arguments, whichever chain step matched. Extraction throws when that
    base is missing or has too few arguments. Every other key is left as it was.
  */
  function SetupFakeCallForType(
    u: Universe, table: DispatchTable, t: TypeId, parent: TypeId, methodName: string, collaborator: Collaborator
  ): (r: Result<DispatchTable, WiringError>)
    requires Valid(u) && t in u && parent in u
    ensures !Selected(u, t, parent) ==> r == Success(table)
    ensures Selected(u, t, parent) ==> (r.Success? <==> HasInputOutput(u, t))
    ensures r.Failure? ==> r.error.target == t
    ensures r.Failure? && u[t].baseType.None? ==> r.error.NullBaseType?
    ensures r.Failure? && u[t].baseType.Some? ==>
              r.error == IndexOutOfRange(t, |u[u[t].baseType.value].genericArguments|)
    ensures r.Success? && Selected(u, t, parent) ==>
              RuleKey(methodName, u[t].name) in r.value &&
              r.value[RuleKey(methodName, u[t].name)] == Rule(t, BaseArgument(u, t, 0), BaseArgument(u, t, 1), collaborator)
    ensures r.Success? ==>
              forall k :: k != RuleKey(methodName, u[t].name) ==>
                (k in r.value <==> k in table) && (k in table ==> r.value[k] == table[k])
  {
    if u[t].isClass && !u[t].isAbstract && IsSubClassOfGeneric(u, t, parent) then
      match u[t].baseType
      case None => Failure(NullBaseType(t))
      case Some(b) =>
        var genericArguments := u[b].genericArguments;
        if |genericArguments| == 0 then Failure(IndexOutOfRange(t, 0))
        else if |genericArguments| == 1 then Failure(IndexOutOfRange(t, 1))
        else
          var inputType := genericArguments[0];
          var outputType := genericArguments[1];
          Success(table[RuleKey(methodName, u[t].name) := Rule(t, inputType, outputType, collaborator)])
    else
      Success(table)
  }

  /** Scanning `t` configures a rule under `key`. */
  predicate Registers(u: Universe, templates: Templates, t: TypeId, key: RuleKey)
    requires Valid(u) && t in u && templates.orchestrator in u && templates.activity in u
  {
    && key.firstArgument == u[t].name
    && ((key.methodName == SubOrchestratorMethod && Selected(u, t, templates.orchestrator)) ||
        (key.methodName == ActivityMethod && Selected(u, t, templates.activity)))
  }

  /** Scanning `t` throws: it is selected for a template but its base lacks the two arguments. */
  predicate Faulty(u: Universe, templates: Templates, t: TypeId)
    requires Valid(u) && t in u && templates.orchestrator in u && templates.activity in u
  {
    (Selected(u, t, templates.orchestrator) || Selected(u, t, templates.activity)) && !HasInputOutput(u, t)
  }

  /**
    One iteration of the scan: `t` against the orchestrator template, then against the
    activity template. Keys `t` registers get its rule; every other key is untouched.
  */
  function ScanType(u: Universe, templates: Templates, table: DispatchTable, t: TypeId): (r: Result<DispatchTable, WiringError>)
    requires Valid(u) && t in u && templates.orchestrator in u && templates.activity in u
    ensures r.Failure? <==> Faulty(u, templates, t)
    ensures r.Failure? ==> r.error.target == t
    ensures r.Success? ==> forall key :: key in r.value <==> key in table || Registers(u, templates, t, key)
    ensures r.Success? ==>
              forall key :: key in r.value ==>
                if Registers(u, templates, t, key) then r.value[key].target == t && RuleFits(u, templates, key, r.value[key])
                else r.value[key] == table[key]
  {
    var withOrchestrator :- SetupFakeCallForType(u, table, t, templates.orchestrator, SubOrchestratorMethod, OrchestrationContext);
    SetupFakeCallForType(u, withOrchestrator, t, templates.activity, ActivityMethod, ActivityContext)
  }

  /** `rule` is what scanning its target configures under `key`. */
  predicate RuleFits(u: Universe, templates: Templates, key: RuleKey, rule: Rule)
    requires Valid(u) && templates.orchestrator in u && templates.activity in u
  {
    && rule.target in u
    && Registers(u, templates, rule.target, key)
    && HasInputOutput(u, rule.target)
    && rule.input == BaseArgument(u, rule.target, 0)
    && rule.output == BaseArgument(u, rule.target, 1)
    && rule.collaborator == CollaboratorFor(key.methodName)
  }

  /**
    `CreateDurableMock`: every scanned type is tried against the orchestrator template
    and then the activity template. The scan throws if any selected type is faulty;
    otherwise a key holds a rule exactly when some scanned type registers it, that rule
    is what its target registers, and it comes from the last type registering the key.
  */
  function CreateDurableMock(u: Universe, templates: Templates, types: seq<TypeId>): (r: Result<DispatchTable, WiringError>)
    requires Valid(u) && templates.orchestrator in u && templates.activity in u && AllIn(u, types)
    ensures r.Failure? <==> exists i :: 0 <= i < |types| && Faulty(u, templates, types[i])
    ensures r.Failure? ==>
              exists i :: 0 <= i < |types| && types[i] == r.error.target && Faulty(u, templates, types[i]) &&
                forall j :: 0 <= j < i ==> !Faulty(u, templates, types[j])
    ensures r.Success? ==>
              forall key :: key in r.value <==> exists i :: 0 <= i < |types| && Registers(u, templates, types[i], key)
    ensures r.Success? ==> forall key :: key in r.value ==> RuleFits(u, templates, key, r.value[key])
    ensures r.Success? ==>
              forall key, j :: key in r.value && 0 <= j < |types| && Registers(u, templates, types[j], key) ==>
                r.value[key].target in types[j..]
    decreases |types|
  {
    if types == [] then Success(map[])
    else
      var t := types[|types| - 1];
      var scanned := types[..|types| - 1];
      assert types == scanned + [t];
      var previous := CreateDurableMock(u, templates, scanned);
      if previous.Failure? then
        previous
      else
        var r := ScanType(u, templates, previous.value, t);
        if r.Failure? then
          assert types[|scanned|] == t;
          r
        else
          ScanStepKeys(u, templates, scanned, t, previous.value, r);
          ScanStepRules(u, templates, scanned, t, previous.value, r);
          r
  }

  /** The key set after one more scanned type. */
  lemma ScanStepKeys(
    u: Universe, templates: Templates, scanned: seq<TypeId>, t: TypeId, table: DispatchTable, r: Result<DispatchTable, WiringError>)
    requires Valid(u) && templates.orchestrator in u && templates.activity in u && AllIn(u, scanned) && t in u
    requires forall key :: key in table <==> exists i :: 0 <= i < |scanned| && Registers(u, templates, scanned[i], key)
    requires r == ScanType(u, templates, table, t) && r.Success?
    ensures forall key :: key in r.value <==>
              exists i :: 0 <= i < |scanned + [t]| && Registers(u, templates, (scanned + [t])[i], key)
  {
    var types := scanned + [t];
    forall key | key in r.value
      ensures exists i :: 0 <= i < |types| && Registers(u, templates, types[i], key)
    {
      if Registers(u, templates, t, key) {
        assert types[|scanned|] == t;
      } else {
        var i :| 0 <= i < |scanned| && Registers(u, templates, scanned[i], key);
        assert types[i] == scanned[i];
      }
    }
    forall key | exists i :: 0 <= i < |types| && Registers(u, templates, types[i], key)
      ensures key in r.value
    {
      var i :| 0 <= i < |types| && Registers(u, templates, types[i], key);
      if i < |scanned| {
        assert types[i] == scanned[i];
      }
    }
  }

  /** The rules after one more scanned type: each still fits, and each comes from the last type registering its key. */
  lemma ScanStepRules(
    u: Universe, templates: Templates, scanned: seq<TypeId>, t: TypeId, table: DispatchTable, r: Result<DispatchTable, WiringError>)
    requires Valid(u) && templates.orchestrator in u && templates.activity in u && AllIn(u, scanned) && t in u
    requires forall key :: key in table ==> RuleFits(u, templates, key, table[key])
    requires forall key, j :: key in table && 0 <= j < |scanned| && Registers(u, templates, scanned[j], key) ==>
               table[key].target in scanned[j..]
    requires r == ScanType(u, templates, table, t) && r.Success?
    ensures forall key :: key in r.value ==> RuleFits(u, templates, key, r.value[key])
    ensures forall key, j :: key in r.value && 0 <= j < |scanned + [t]| && Registers(u, templates, (scanned + [t])[j], key) ==>
              r.value[key].target in (scanned + [t])[j..]
  {
    var types := scanned + [t];
    forall key, j | key in r.value && 0 <= j < |types| && Registers(u, templates, types[j], key)
      ensures r.value[key].target in types[j..]
    {
      if Registers(u, templates, t, key) {
        assert types[j..][|types| - 1 - j] == t;
      } else {
        assert j < |scanned| && types[j] == scanned[j];
        assert key in table;
        var k :| 0 <= k < |scanned[j..]| && scanned[j..][k] == table[key].target;
        assert types[j..][k] == table[key].target;
      }
    }
  }

  /** How the fake answers an intercepted call: the configured rule, or `None` for the fake's default behaviour. */
  function Dispatch(table: DispatchTable, methodName: string, firstArgument: string): Option<Rule> {
    var key := RuleKey(methodName, firstArgument);
    if key in table then Some(table[key]) else None
  }

  /** An intercepted call is answered by a rule exactly when a scanned type registered its key, and that rule fits the key. */
  lemma DispatchAfterWiring(u: Universe, templates: Templates, types: seq<TypeId>, methodName: string, firstArgument: string)
    requires Valid(u) && templates.orchestrator in u && templates.activity in u && AllIn(u, types)
    requires CreateDurableMock(u, templates, types).Success?
    ensures var answer := Dispatch(CreateDurableMock(u, templates, types).value, methodName, firstArgument);
            && (answer.Some? <==>
                  exists i :: 0 <= i < |types| && Registers(u, templates, types[i], RuleKey(methodName, firstArgument)))
            && (answer.Some? ==> RuleFits(u, templates, RuleKey(methodName, firstArgument), answer.value))
  {
  }

  /** An assembly with no concrete class matching either template configures no rule at all. */
  lemma NoMatchingTypesWiresNothing(u: Universe, templates: Templates, types: seq<TypeId>)
    requires Valid(u) && templates.orchestrator in u && templates.activity in u && AllIn(u, types)
    requires forall i :: 0 <= i < |types| ==>
               !Selected(u, types[i], templates.orchestrator) && !Selected(u, types[i], templates.activity)
    ensures CreateDurableMock(u, templates, types) == Success(map[])
  {
    var r := CreateDurableMock(u, templates, types);
    assert r.Success?;
    assert r.value.Keys == {};
  }

  /**
    A concrete class deriving directly from an instantiation of the activity template,
    scanned alone, configures the activity call under its own name, with the
    instantiation's two arguments as input and output. It also configures the
    sub-orchestration call, with the same rule data, exactly when it matches the
    orchestrator template too.
  */
  lemma SingleActivityWiring(u: Universe, templates: Templates, t: TypeId)
    requires Valid(u) && templates.orchestrator in u && templates.activity in u && t in u
    requires u[t].isClass && !u[t].isAbstract && t != templates.activity
    requires FullTypeDefinition(u, templates.activity) == templates.activity
    requires u[t].baseType.Some? && u[t].baseType.value != ObjectId
    requires FullTypeDefinition(u, u[t].baseType.value) == templates.activity
    requires |u[u[t].baseType.value].genericArguments| == 2
    ensures CreateDurableMock(u, templates, [t]) ==
              Success(
                (if Selected(u, t, templates.orchestrator)
                 then map[RuleKey(SubOrchestratorMethod, u[t].name) :=
                   Rule(t, u[u[t].baseType.value].genericArguments[0], u[u[t].baseType.value].genericArguments[1], OrchestrationContext)]
                 else map[]) +
                map[RuleKey(ActivityMethod, u[t].name) :=
                  Rule(t, u[u[t].baseType.value].genericArguments[0], u[u[t].baseType.value].genericArguments[1], ActivityContext)])
  {
    assert Chain(u, t)[1] == u[t].baseType.value;
    MatchThroughChainDefinition(u, t, templates.activity, 1);
    var input := u[u[t].baseType.value].genericArguments[0];
    var output := u[u[t].baseType.value].genericArguments[1];
    var first :=
      if Selected(u, t, templates.orchestrator)
      then map[RuleKey(SubOrchestratorMethod, u[t].name) := Rule(t, input, output, OrchestrationContext)]
      else map[];
    var withOrchestrator := SetupFakeCallForType(u, map[], t, templates.orchestrator, SubOrchestratorMethod, OrchestrationContext);
    assert withOrchestrator == Success(first);
    var withActivity := SetupFakeCallForType(u, first, t, templates.activity, ActivityMethod, ActivityContext);
    assert withActivity == Success(first[RuleKey(ActivityMethod, u[t].name) := Rule(t, input, output, ActivityContext)]);
    assert ScanType(u, templates, map[], t) == withActivity;
    assert [t][..0] == [];
    assert CreateDurableMock(u, templates, [t]) == withActivity;
    assert first[RuleKey(ActivityMethod, u[t].name) := Rule(t, input, output, ActivityContext)] ==
           first + map[RuleKey(ActivityMethod, u[t].name) := Rule(t, input, output, ActivityContext)];
  }

  /**
    A concrete class two levels below an instantiation of the template, through a
    non-generic intermediate class, matches the template, yet setting up its rule throws
    because the arguments are read from the intermediate class.
  */
  lemma IndirectSubclassFailsWiring(
    u: Universe, table: DispatchTable, t: TypeId, parent: TypeId, methodName: string, collaborator: Collaborator)
    requires Valid(u) && t in u && parent in u
    requires u[t].isClass && !u[t].isAbstract && t != parent
    requires FullTypeDefinition(u, parent) == parent
    requires u[t].baseType.Some? && u[u[t].baseType.value].genericArguments == []
    requires u[u[t].baseType.value].baseType.Some? && u[u[t].baseType.value].baseType.value != ObjectId
    requires FullTypeDefinition(u, u[u[t].baseType.value].baseType.value) == parent
    ensures IsSubClassOfGeneric(u, t, parent)
    ensures SetupFakeCallForType(u, table, t, parent, methodName, collaborator) == Failure(IndexOutOfRange(t, 0))
  {
    var mid := u[t].baseType.value;
    assert Chain(u, t) == [t] + Chain(u, mid);
    assert Chain(u, t)[2] == u[mid].baseType.value;
    MatchThroughChainDefinition(u, t, parent, 2);
  }
}
